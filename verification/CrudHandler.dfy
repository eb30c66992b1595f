/** `CrudHandler`: what each request answers and does to the flat store, as a function, and
    the handler over the nested store proved to do just that. */
module CrudHandler {
  import opened Text
  import opened Maps
  import opened Numbers
  import opened Ordering
  import opened HttpText
  import opened HttpRequest
  import opened HttpResponse
  import opened Store
  import opened Json
  import opened CrudPath

  // Answers.

  function Reply(status: int, reason: string, contentType: string, body: string): Response {
    Make("HTTP/1.1", status, reason, map["Content-Type" := contentType], body)
  }

  function Plain(status: int, reason: string, body: string): Response {
    Reply(status, reason, "text/plain", body)
  }

  function JsonOk(body: string): Response {
    Reply(200, "OK", "application/json", body)
  }

  function EntityNotFound(): Response {
    Reply(404, "Not Found", "text/html", "Entity not found")
  }

  function CreatedText(id: string): string {
    "{\"id\": " + id + "}"
  }

  function Created(id: string): Response {
    Reply(201, "Created", "application/json", CreatedText(id))
  }

  function NoIdLeft(entity: string): string {
    "MockFilesystem: no available integer IDs for entity " + entity
  }

  // Lists.

  function QueryParam(r: Request, key: string): Option<string> {
    if key in r.queryParams then Some(r.queryParams[key]) else None
  }

  ghost predicate Passes(payload: string, field: string, filter: Option<string>) {
    filter.Some? ==> Contains(ExtractJsonField(payload, field), filter.value)
  }

  ghost predicate Matches(payload: string, name: Option<string>, tag: Option<string>) {
    Passes(payload, "name", name) && Passes(payload, "tag", tag)
  }

  ghost function Matching(store: Flat, entity: string, name: Option<string>, tag: Option<string>): set<string> {
    set id | id in Ids(store, entity) && (entity, id) in store && Matches(store[(entity, id)], name, tag)
  }

  function QuotedAll(ids: seq<string>): seq<string> {
    seq(|ids|, i requires 0 <= i < |ids| => Quoted(ids[i]))
  }

  /** `["a", "b"]` */
  function ListText(ids: seq<string>): string {
    "[" + Join(QuotedAll(ids), ", ") + "]"
  }

  // One request on the flat store.

  datatype Served = Served(response: Response, store: Flat)

  function ServePost(store: Flat, entity: string, body: string): Served {
    match NextId(Ids(store, entity))
    case None => Served(Plain(500, "Internal Server Error", "Failed to allocate ID: " + NoIdLeft(entity)), store)
    case Some(id) => Served(Created(id), store[(entity, id) := body])
  }

  function GetAnswer(store: Flat, entity: string, id: string): Response {
    if (entity, id) in store then JsonOk(store[(entity, id)]) else EntityNotFound()
  }

  ghost function ListAnswer(store: Flat, entity: string, r: Request): Response {
    JsonOk(ListText(SortedKeys(Matching(store, entity, QueryParam(r, "name"), QueryParam(r, "tag")))))
  }

  ghost function ServeTarget(store: Flat, r: Request, t: Target): Served {
    if r.verb == "POST" then
      if t.id.Some? then Served(Plain(400, "Bad Request", "POST must not include ID in path"), store)
      else ServePost(store, t.entity, r.body)
    else if r.verb == "GET" then
      Served(if t.id.Some? then GetAnswer(store, t.entity, t.id.value) else ListAnswer(store, t.entity, r), store)
    else if r.verb == "PUT" then
      if t.id.None? then Served(Plain(400, "Bad Request", "PUT must include ID in path"), store)
      else if (t.entity, t.id.value) !in store then Served(EntityNotFound(), store)
      else Served(JsonOk(r.body), store[(t.entity, t.id.value) := r.body])
    else if r.verb == "DELETE" then
      if t.id.None? then Served(Plain(400, "Bad Request", "DELETE must include ID in path"), store)
      else if (t.entity, t.id.value) !in store then Served(EntityNotFound(), store)
      else Served(Plain(200, "OK", "Entity deleted successfully"), store - {(t.entity, t.id.value)})
    else
      Served(Plain(501, "Not Implemented", "CRUD method not implemented yet"), store)
  }

  ghost function Serve(prefix: string, store: Flat, r: Request): Served {
    match ParsePath(prefix, r.path)
    case None => Served(Plain(400, "Bad Request", "Invalid CRUD path"), store)
    case Some(t) => ServeTarget(store, r, t)
  }

  // What is answered, byte by byte and case by case.

  lemma LengthBeforeType()
    ensures LexLe("Content-Length", "Content-Type") && "Content-Length" != "Content-Type"
  {
    LexExactly("Content-", "Length", "Type");
    assert "Content-" + "Length" == "Content-Length";
    assert "Content-" + "Type" == "Content-Type";
    assert "Content-Length"[8] != "Content-Type"[8];
  }

  lemma FieldsOfReply(headers: map<string, string>, a: string, v: string, b: string, w: string)
    requires headers == map[b := w][a := v] && a != b
    ensures headers.Keys == {a, b} && headers[a] == v && headers[b] == w
  {}

  /** The bytes of an answer. */
  lemma ReplyOnWire(status: int, reason: string, contentType: string, body: string)
    ensures Wire(Reply(status, reason, contentType, body)) ==
            TwoFieldText("HTTP/1.1", status, reason, "Content-Length", NatToString(|body|), "Content-Type", contentType,
                         body)
  {
    LengthBeforeType();
    FieldsOfReply(Reply(status, reason, contentType, body).headers, "Content-Length", NatToString(|body|),
                  "Content-Type", contentType);
    TwoFieldsOnWire(Reply(status, reason, contentType, body), "Content-Length", "Content-Type");
  }

  /** The status of every answer: 400 for paths that name nothing, for a POST with an id, and for a PUT or a DELETE
      without one; 404 for an entity that is not there; 201 for a POST that finds a free id and 500 for one that
      does not; 501 for other verbs; and 200 for the rest. */
  ghost predicate HasStatus(status: int, store: Flat, r: Request, target: Option<Target>) {
    match target
    case None => status == 400
    case Some(t) =>
      if r.verb == "POST" then
        status == if t.id.Some? then 400 else if NextId(Ids(store, t.entity)).None? then 500 else 201
      else if r.verb == "GET" then
        status == if t.id.Some? && (t.entity, t.id.value) !in store then 404 else 200
      else if r.verb == "PUT" || r.verb == "DELETE" then
        status == if t.id.None? then 400 else if (t.entity, t.id.value) !in store then 404 else 200
      else
        status == 501
  }

  lemma TargetStatus(store: Flat, r: Request, t: Target)
    ensures HasStatus(ServeTarget(store, r, t).response.status, store, r, Some(t))
  {}

  lemma StatusExactly(prefix: string, store: Flat, r: Request)
    ensures HasStatus(Serve(prefix, store, r).response.status, store, r, ParsePath(prefix, r.path))
  {
    match ParsePath(prefix, r.path) {
      case None =>
      case Some(t) => TargetStatus(store, r, t);
    }
  }

  /** What is answered and stored for a target, verb by verb. */
  lemma PostExactly(store: Flat, r: Request, t: Target)
    requires r.verb == "POST"
    ensures var s := ServeTarget(store, r, t);
            if t.id.Some? then
              s == Served(Reply(400, "Bad Request", "text/plain", "POST must not include ID in path"), store)
            else match NextId(Ids(store, t.entity))
              case None =>
                s == Served(Reply(500, "Internal Server Error", "text/plain", "Failed to allocate ID: " +
                                  ("MockFilesystem: no available integer IDs for entity " + t.entity)), store)
              case Some(id) =>
                s == Served(Reply(201, "Created", "application/json", "{\"id\": " + id + "}"),
                            store[(t.entity, id) := r.body])
  {}

  lemma GetExactly(store: Flat, r: Request, t: Target)
    requires r.verb == "GET"
    ensures var s := ServeTarget(store, r, t);
            && s.store == store
            && if t.id.None? then s.response == Reply(200, "OK", "application/json", s.response.body)
               else if (t.entity, t.id.value) in store then
                 s.response == Reply(200, "OK", "application/json", store[(t.entity, t.id.value)])
               else s.response == Reply(404, "Not Found", "text/html", "Entity not found")
  {}

  lemma PutExactly(store: Flat, r: Request, t: Target)
    requires r.verb == "PUT"
    ensures var s := ServeTarget(store, r, t);
            if t.id.None? then
              s == Served(Reply(400, "Bad Request", "text/plain", "PUT must include ID in path"), store)
            else if (t.entity, t.id.value) in store then
              s == Served(Reply(200, "OK", "application/json", r.body), store[(t.entity, t.id.value) := r.body])
            else
              s == Served(Reply(404, "Not Found", "text/html", "Entity not found"), store)
  {}

  lemma DeleteExactly(store: Flat, r: Request, t: Target)
    requires r.verb == "DELETE"
    ensures var s := ServeTarget(store, r, t);
            if t.id.None? then
              s == Served(Reply(400, "Bad Request", "text/plain", "DELETE must include ID in path"), store)
            else if (t.entity, t.id.value) in store then
              s == Served(Reply(200, "OK", "text/plain", "Entity deleted successfully"),
                          store - {(t.entity, t.id.value)})
            else
              s == Served(Reply(404, "Not Found", "text/html", "Entity not found"), store)
  {}

  // All answers can be taken apart again.

  predicate FieldText(s: string) {
    OneLine(s) && ':' !in s
  }

  lemma NamesAreFields()
    ensures FieldText("Content-Type") && FieldText("Content-Length") && OneLine("HTTP/1.1") && ' ' !in "HTTP/1.1"
  {}

  lemma ReplyOfFields(status: int, reason: string, contentType: string, body: string)
    requires INT_MIN <= status <= INT_MAX && OneLine(reason) && OneLine(contentType)
    requires FieldText("Content-Type") && FieldText("Content-Length") && OneLine("HTTP/1.1") && ' ' !in "HTTP/1.1"
    ensures Sound(Reply(status, reason, contentType, body))
  {
    NumberIsOneLine(|body|);
  }

  lemma ReplyIsSound(status: int, reason: string, contentType: string, body: string)
    requires INT_MIN <= status <= INT_MAX && OneLine(reason) && OneLine(contentType)
    ensures Sound(Reply(status, reason, contentType, body))
  {
    NamesAreFields();
    ReplyOfFields(status, reason, contentType, body);
  }

  lemma PlainIsSound(status: int, reason: string, body: string)
    requires INT_MIN <= status <= INT_MAX && OneLine(reason)
    ensures Sound(Plain(status, reason, body))
  {
    ReplyIsSound(status, reason, "text/plain", body);
  }

  lemma JsonOkIsSound(body: string)
    ensures Sound(JsonOk(body))
  {
    ReplyIsSound(200, "OK", "application/json", body);
  }

  lemma CreatedIsSound(id: string)
    ensures Sound(Created(id))
  {
    ReplyIsSound(201, "Created", "application/json", CreatedText(id));
  }

  lemma EntityNotFoundIsSound()
    ensures Sound(EntityNotFound())
  {
    ReplyIsSound(404, "Not Found", "text/html", "Entity not found");
  }

  lemma FailureIsSound(body: string)
    ensures Sound(Plain(500, "Internal Server Error", body))
  {
    PlainIsSound(500, "Internal Server Error", body);
  }

  lemma PostAnswers(store: Flat, entity: string, body: string)
    ensures var response := ServePost(store, entity, body).response;
            || (exists text :: response == Plain(500, "Internal Server Error", text))
            || (exists id :: response == Created(id))
  {}

  lemma PostIsSound(store: Flat, entity: string, body: string)
    ensures Sound(ServePost(store, entity, body).response)
  {
    PostAnswers(store, entity, body);
    forall text ensures Sound(Plain(500, "Internal Server Error", text)) {
      FailureIsSound(text);
    }
    forall id ensures Sound(Created(id)) {
      CreatedIsSound(id);
    }
  }

  lemma PlainsAreSound(body: string)
    ensures Sound(Plain(400, "Bad Request", body)) && Sound(Plain(200, "OK", body))
    ensures Sound(Plain(501, "Not Implemented", body))
  {
    PlainIsSound(400, "Bad Request", body);
    PlainIsSound(200, "OK", body);
    PlainIsSound(501, "Not Implemented", body);
  }

  /** The answers of the handler, whatever they are made of. */
  ghost predicate IsOneOf(response: Response) {
    || response == EntityNotFound()
    || (exists body :: response == JsonOk(body))
    || (exists body :: response == Plain(200, "OK", body))
    || (exists body :: response == Plain(400, "Bad Request", body))
    || (exists body :: response == Plain(501, "Not Implemented", body))
  }

  lemma OneIsSound(response: Response)
    requires IsOneOf(response)
    ensures Sound(response)
  {
    EntityNotFoundIsSound();
    forall body ensures Sound(JsonOk(body)) {
      JsonOkIsSound(body);
    }
    forall body ensures Sound(Plain(400, "Bad Request", body)) && Sound(Plain(200, "OK", body))
                        && Sound(Plain(501, "Not Implemented", body)) {
      PlainsAreSound(body);
    }
  }

  lemma TargetAnswers(store: Flat, r: Request, t: Target)
    requires r.verb != "POST" || t.id.Some?
    ensures IsOneOf(ServeTarget(store, r, t).response)
  {}

  lemma TargetIsSound(store: Flat, r: Request, t: Target)
    ensures Sound(ServeTarget(store, r, t).response)
  {
    if r.verb == "POST" && t.id.None? {
      PostIsSound(store, t.entity, r.body);
    } else {
      TargetAnswers(store, r, t);
      OneIsSound(ServeTarget(store, r, t).response);
    }
  }

  lemma InvalidPathIsSound()
    ensures Sound(Plain(400, "Bad Request", "Invalid CRUD path"))
  {
    PlainIsSound(400, "Bad Request", "Invalid CRUD path");
  }

  /** Whatever is asked, and whatever ids and payloads go into it, an answer can be taken apart. */
  lemma ServedIsSound(prefix: string, store: Flat, r: Request)
    ensures Sound(Serve(prefix, store, r).response)
  {
    match ParsePath(prefix, r.path) {
      case None => InvalidPathIsSound();
      case Some(t) => TargetIsSound(store, r, t);
    }
  }

  lemma InStore(store: Flat, entity: string, id: string)
    ensures id in Ids(store, entity) <==> (entity, id) in store
  {
    if (entity, id) in store {
      assert (entity, id).1 == id;
    }
  }

  lemma ListStep(ids: seq<string>, i: nat)
    requires i < |ids|
    ensures Join(QuotedAll(ids[..i + 1]), ", ") ==
            (if i > 0 then Join(QuotedAll(ids[..i]), ", ") + ", " else "") + Quoted(ids[i])
  {
    assert QuotedAll(ids[..i + 1]) == QuotedAll(ids[..i]) + [Quoted(ids[i])];
    if i > 0 {
      JoinSnoc(QuotedAll(ids[..i]), Quoted(ids[i]), ", ");
    }
  }

  lemma SortIsSortedKeys(ids: seq<string>, s: set<string>)
    requires Distinct(ids) && Elements(ids) == s
    ensures Sort(ids) == SortedKeys(s)
  {
    SortOrderIndependent(ids, ids);
    SortedUnique(Sort(ids), SortedKeys(s));
  }

  class CrudHandler {
    const routePrefix: string
    const filesystem: MockFilesystem

    constructor (routePrefix: string, filesystem: MockFilesystem)
      ensures this.routePrefix == routePrefix && this.filesystem == filesystem
    {
      this.routePrefix, this.filesystem := routePrefix, filesystem;
    }

    method HandlePost(request: Request, entity: string) returns (response: Response)
      modifies filesystem
      ensures Served(response, filesystem.View()) == ServePost(old(filesystem.View()), entity, request.body)
    {
      var body := request.body;
      var newId := filesystem.NextEntityId(entity);
      if newId.None? {
        return Plain(500, "Internal Server Error", "Failed to allocate ID: " + NoIdLeft(entity));
      }
      var ok := filesystem.WriteEntity(entity, newId.value, body);
      assert ok;
      return Created(newId.value);
    }

    method HandleGet(entity: string, id: string) returns (response: Response)
      ensures response == GetAnswer(filesystem.View(), entity, id)
    {
      var found := filesystem.EntityExists(entity, id);
      if !found {
        return EntityNotFound();
      }
      var data := filesystem.ReadEntity(entity, id);
      return JsonOk(data.value);
    }

    method HandlePut(request: Request, entity: string, id: string) returns (response: Response)
      modifies filesystem
      ensures var store := old(filesystem.View());
              Served(response, filesystem.View()) ==
              if (entity, id) !in store then Served(EntityNotFound(), store)
              else Served(JsonOk(request.body), store[(entity, id) := request.body])
    {
      var found := filesystem.EntityExists(entity, id);
      if !found {
        return EntityNotFound();
      }
      var body := request.body;
      var ok := filesystem.WriteEntity(entity, id, body);
      assert ok;
      return JsonOk(body);
    }

    method HandleDelete(entity: string, id: string) returns (response: Response)
      modifies filesystem
      ensures var store := old(filesystem.View());
              Served(response, filesystem.View()) ==
              if (entity, id) !in store then Served(EntityNotFound(), store)
              else Served(Plain(200, "OK", "Entity deleted successfully"), store - {(entity, id)})
    {
      var found := filesystem.EntityExists(entity, id);
      if !found {
        return EntityNotFound();
      }
      var ok := filesystem.DeleteEntity(entity, id);
      assert ok;
      return Plain(200, "OK", "Entity deleted successfully");
    }

    /** `crud_handler.cc:266-296`, one round of that loop. */
    method IdMatches(entity: string, id: string, nameFilter: Option<string>, tagFilter: Option<string>)
      returns (matches: bool)
      requires id in Ids(filesystem.View(), entity)
      ensures matches == (id in Matching(filesystem.View(), entity, nameFilter, tagFilter))
    {
      InStore(filesystem.View(), entity, id);
      if nameFilter.None? && tagFilter.None? {
        return true;
      }
      var entityData := filesystem.ReadEntity(entity, id);
      matches := true;
      if nameFilter.Some? {
        var nameValue := ExtractField(entityData.value, "name");
        if !Contains(nameValue, nameFilter.value) {
          matches := false;
        }
      }
      if tagFilter.Some? && matches {
        var tagValue := ExtractField(entityData.value, "tag");
        if !Contains(tagValue, tagFilter.value) {
          matches := false;
        }
      }
    }

    /** `crud_handler.cc:262-297`, the loop over all ids. */
    method FilterIds(entity: string, ids: seq<string>, nameFilter: Option<string>, tagFilter: Option<string>)
      returns (filteredIds: seq<string>)
      requires Distinct(ids) && Elements(ids) == Ids(filesystem.View(), entity)
      ensures Distinct(filteredIds)
      ensures Elements(filteredIds) == Matching(filesystem.View(), entity, nameFilter, tagFilter)
    {
      filteredIds := [];
      for k := 0 to |ids|
        invariant Distinct(filteredIds)
        invariant forall x :: x in filteredIds <==>
                    x in ids[..k] && x in Matching(filesystem.View(), entity, nameFilter, tagFilter)
      {
        var id := ids[k];
        assert id in Elements(ids) && id !in ids[..k] && ids[..k + 1] == ids[..k] + [id];
        var matches := IdMatches(entity, id, nameFilter, tagFilter);
        if matches {
          filteredIds := filteredIds + [id];
        }
      }
      assert ids[..|ids|] == ids;
    }

    /** `crud_handler.cc:303-313`, the JSON array. */
    static method FormatList(ids: seq<string>) returns (responseBody: string)
      ensures responseBody == ListText(ids)
    {
      responseBody := "[";
      for i := 0 to |ids|
        invariant responseBody == "[" + Join(QuotedAll(ids[..i]), ", ")
      {
        ListStep(ids, i);
        if i > 0 {
          responseBody := responseBody + ", ";
        }
        responseBody := responseBody + Quoted(ids[i]);
      }
      assert ids[..|ids|] == ids;
      responseBody := responseBody + "]";
    }

    method HandleList(request: Request, entity: string) returns (response: Response)
      ensures response == ListAnswer(filesystem.View(), entity, request)
    {
      var nameFilter := QueryParam(request, "name");
      var tagFilter := QueryParam(request, "tag");
      var ids := filesystem.ListEntityIds(entity);
      var filteredIds := FilterIds(entity, ids, nameFilter, tagFilter);
      SortIsSortedKeys(filteredIds, Matching(filesystem.View(), entity, nameFilter, tagFilter));
      filteredIds := Sort(filteredIds);
      var responseBody := FormatList(filteredIds);
      return JsonOk(responseBody);
    }

    method ParseEntityAndIdFromPath(path: string) returns (ok: bool, entityOut: string, idOut: string, hasIdOut: bool)
      ensures ParsePath(routePrefix, path) ==
              if ok then Some(Target(entityOut, if hasIdOut then Some(idOut) else None)) else None
    {
      ok, entityOut, idOut, hasIdOut := false, "", "", false;
      var p := path;
      var queryPos := FindChar(p, '?', 0);
      if queryPos.Some? {
        p := p[..queryPos.value];
      }
      if routePrefix != "" {
        if !StartsWith(p, routePrefix) {
          return;
        }
      }
      var rest := p[|routePrefix|..];
      if rest != "" && rest[0] == '/' {
        rest := rest[1..];
      }
      var entityPart, idPart := "", "";
      var slashPos := FindChar(rest, '/', 0);
      if slashPos.None? {
        entityPart := rest;
      } else {
        entityPart := rest[..slashPos.value];
        idPart := rest[slashPos.value + 1..];
        if FindChar(idPart, '/', 0).Some? {
          return;
        }
        if idPart != "" {
          hasIdOut := true;
        }
      }
      if entityPart == "" {
        return;
      }
      entityOut := entityPart;
      idOut := if hasIdOut then idPart else "";
      ok := true;
    }

    method HandleRequest(request: Request) returns (response: Response)
      modifies filesystem
      ensures Served(response, filesystem.View()) == Serve(routePrefix, old(filesystem.View()), request)
    {
      var verb := request.verb;
      var path := request.path;
      var parsed, entity, id, hasId := ParseEntityAndIdFromPath(path);
      if !parsed {
        return Plain(400, "Bad Request", "Invalid CRUD path");
      }
      if verb == "POST" {
        if hasId {
          return Plain(400, "Bad Request", "POST must not include ID in path");
        }
        response := HandlePost(request, entity);
        return;
      }
      if verb == "GET" {
        if hasId {
          response := HandleGet(entity, id);
        } else {
          response := HandleList(request, entity);
        }
        return;
      }
      if verb == "PUT" {
        if !hasId {
          return Plain(400, "Bad Request", "PUT must include ID in path");
        }
        response := HandlePut(request, entity, id);
        return;
      }
      if verb == "DELETE" {
        if !hasId {
          return Plain(400, "Bad Request", "DELETE must include ID in path");
        }
        response := HandleDelete(entity, id);
        return;
      }
      return Plain(501, "Not Implemented", "CRUD method not implemented yet");
    }
  }
}
