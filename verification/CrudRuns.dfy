/** What holds of every sequence of requests to the CRUD handlers, whatever their prefixes:
    they share one store, which starts out empty. */
module CrudRuns {
  import opened Text
  import opened Numbers
  import opened HttpRequest
  import opened HttpResponse
  import opened Store
  import opened CrudPath
  import opened CrudHandler

  datatype Step = Step(prefix: string, request: Request)

  ghost function StoreAfter(run: seq<Step>): Flat {
    if run == [] then map[]
    else
      var last := run[|run| - 1];
      Serve(last.prefix, StoreAfter(run[..|run| - 1]), last.request).store
  }

  ghost function ResponseAfter(run: seq<Step>, step: Step): Response {
    Serve(step.prefix, StoreAfter(run), step.request).response
  }

  // What a client can tell from a request and its response.

  datatype Event = Nothing | Written(entity: string, id: string, payload: string) | Deleted(entity: string, id: string)

  predicate Succeeded(response: Response) {
    200 <= response.status < 300
  }

  /** The id in a body `{"id": N}`. */
  function CreatedId(body: string): string {
    if |body| >= 8 && body[..7] == "{\"id\": " && body[|body| - 1] == '}' then body[7..|body| - 1] else ""
  }

  function TargetEvent(r: Request, t: Target, response: Response): Event {
    if !Succeeded(response) then Nothing
    else if r.verb == "POST" then Written(t.entity, CreatedId(response.body), r.body)
    else if r.verb == "PUT" && t.id.Some? then Written(t.entity, t.id.value, r.body)
    else if r.verb == "DELETE" && t.id.Some? then Deleted(t.entity, t.id.value)
    else Nothing
  }

  function EventOf(step: Step, response: Response): Event {
    match ParsePath(step.prefix, step.request.path)
    case None => Nothing
    case Some(t) => TargetEvent(step.request, t, response)
  }

  function Apply(store: Flat, event: Event): Flat {
    match event
    case Nothing => store
    case Written(e, i, payload) => store[(e, i) := payload]
    case Deleted(e, i) => store - {(e, i)}
  }

  /** A POST writes an id that was free, a PUT one that is there; a DELETE removes one that is there. */
  predicate Fits(store: Flat, verb: string, event: Event) {
    match event
    case Nothing => true
    case Written(e, i, _) =>
      || (verb == "POST" && (e, i) !in store && NextId(Ids(store, e)) == Some(i))
      || (verb == "PUT" && (e, i) in store)
    case Deleted(e, i) => verb == "DELETE" && (e, i) in store
  }

  lemma CreatedIdOfText(id: string)
    ensures CreatedId(CreatedText(id)) == id
  {
    var body := CreatedText(id);
    assert |body| == |id| + 8 && body[..7] == "{\"id\": " && body[7..|body| - 1] == id;
  }

  lemma PostFits(store: Flat, entity: string, body: string)
    ensures var s := ServePost(store, entity, body);
            if Succeeded(s.response) then
              var i := CreatedId(s.response.body);
              NextId(Ids(store, entity)) == Some(i) && (entity, i) !in store && s.store == store[(entity, i) := body]
            else
              s.store == store
  {
    var next := NextId(Ids(store, entity));
    if next.Some? {
      var c := NextIdNumber(Ids(store, entity));
      CreatedIdOfText(next.value);
      InStore(store, entity, next.value);
    }
  }

  ghost predicate Refines(store: Flat, r: Request, t: Target) {
    var s := ServeTarget(store, r, t);
    s.store == Apply(store, TargetEvent(r, t, s.response)) && Fits(store, r.verb, TargetEvent(r, t, s.response))
  }

  lemma PostRefines(store: Flat, r: Request, t: Target)
    requires r.verb == "POST"
    ensures Refines(store, r, t)
  {
    if t.id.None? {
      PostFits(store, t.entity, r.body);
    }
  }

  lemma PutRefines(store: Flat, r: Request, t: Target)
    requires r.verb == "PUT"
    ensures Refines(store, r, t)
  {}

  lemma DeleteRefines(store: Flat, r: Request, t: Target)
    requires r.verb == "DELETE"
    ensures Refines(store, r, t)
  {}

  lemma TargetRefines(store: Flat, r: Request, t: Target)
    ensures Refines(store, r, t)
  {
    if r.verb == "POST" {
      PostRefines(store, r, t);
    } else if r.verb == "PUT" {
      PutRefines(store, r, t);
    } else if r.verb == "DELETE" {
      DeleteRefines(store, r, t);
    }
  }

  /** A request changes the store by what the client can read off its response, at one pair at
      most; a response outside 2xx, and any GET, changes nothing. */
  lemma StepRefines(store: Flat, step: Step)
    ensures var s := Serve(step.prefix, store, step.request);
            var event := EventOf(step, s.response);
            && s.store == Apply(store, event) && Fits(store, step.request.verb, event)
            && (!Succeeded(s.response) || step.request.verb == "GET" ==> s.store == store)
  {
    match ParsePath(step.prefix, step.request.path) {
      case None =>
      case Some(t) => TargetRefines(store, step.request, t);
    }
  }

  // Reading back.

  /** What the requests and responses of a run say was last written to a pair and not deleted since. */
  ghost function LastWrite(run: seq<Step>, entity: string, id: string): Option<string> {
    if run == [] then None
    else
      var before, last := run[..|run| - 1], run[|run| - 1];
      match EventOf(last, ResponseAfter(before, last))
      case Written(e, i, payload) => if (e, i) == (entity, id) then Some(payload) else LastWrite(before, entity, id)
      case Deleted(e, i) => if (e, i) == (entity, id) then None else LastWrite(before, entity, id)
      case Nothing => LastWrite(before, entity, id)
  }

  lemma LookupApplied(store: Flat, event: Event, entity: string, id: string)
    ensures FlatLookup(Apply(store, event), entity, id) ==
            match event
            case Written(e, i, payload) =>
              if (e, i) == (entity, id) then Some(payload) else FlatLookup(store, entity, id)
            case Deleted(e, i) => if (e, i) == (entity, id) then None else FlatLookup(store, entity, id)
            case Nothing => FlatLookup(store, entity, id)
  {}

  lemma {:induction false} StoreIsLastWrite(run: seq<Step>, entity: string, id: string)
    ensures FlatLookup(StoreAfter(run), entity, id) == LastWrite(run, entity, id)
    decreases |run|
  {
    if run != [] {
      var before, last := run[..|run| - 1], run[|run| - 1];
      StoreIsLastWrite(before, entity, id);
      StepRefines(StoreAfter(before), last);
      LookupApplied(StoreAfter(before), EventOf(last, ResponseAfter(before, last)), entity, id);
    }
  }

  /** In every run a GET of a pair answers the payload last written to it, and 404 if there is none. */
  lemma GetReadsLastWrite(run: seq<Step>, step: Step, t: Target)
    requires step.request.verb == "GET" && ParsePath(step.prefix, step.request.path) == Some(t) && t.id.Some?
    ensures ResponseAfter(run, step) ==
            match LastWrite(run, t.entity, t.id.value)
            case Some(payload) => JsonOk(payload)
            case None => EntityNotFound()
  {
    StoreIsLastWrite(run, t.entity, t.id.value);
  }

  // Counting.

  ghost function Live(run: seq<Step>, entity: string): nat {
    |Ids(StoreAfter(run), entity)|
  }

  ghost function Peak(run: seq<Step>, entity: string): nat {
    if run == [] then 0
    else
      var before := Peak(run[..|run| - 1], entity);
      if before < Live(run, entity) then Live(run, entity) else before
  }

  function EntityOf(step: Step): Option<string> {
    match ParsePath(step.prefix, step.request.path) case None => None case Some(t) => Some(t.entity)
  }

  function IsPosted(step: Step, response: Response, entity: string): bool {
    step.request.verb == "POST" && response.status == 201 && EntityOf(step) == Some(entity)
  }

  function IsDeleted(step: Step, response: Response, entity: string): bool {
    step.request.verb == "DELETE" && Succeeded(response) && EntityOf(step) == Some(entity)
  }

  ghost function Posts(run: seq<Step>, entity: string): nat {
    if run == [] then 0
    else
      var before, last := run[..|run| - 1], run[|run| - 1];
      Posts(before, entity) + if IsPosted(last, ResponseAfter(before, last), entity) then 1 else 0
  }

  ghost function Deletes(run: seq<Step>, entity: string): nat {
    if run == [] then 0
    else
      var before, last := run[..|run| - 1], run[|run| - 1];
      Deletes(before, entity) + if IsDeleted(last, ResponseAfter(before, last), entity) then 1 else 0
  }

  lemma IdsApplied(store: Flat, event: Event, entity: string)
    ensures Ids(Apply(store, event), entity) ==
            match event
            case Written(e, i, _) => if e == entity then Ids(store, entity) + {i} else Ids(store, entity)
            case Deleted(e, i) => if e == entity then Ids(store, entity) - {i} else Ids(store, entity)
            case Nothing => Ids(store, entity)
  {
    forall i ensures i in Ids(Apply(store, event), entity) <==> (entity, i) in Apply(store, event) {
      InStore(Apply(store, event), entity, i);
    }
    forall i ensures i in Ids(store, entity) <==> (entity, i) in store {
      InStore(store, entity, i);
    }
  }

  /** Each type has ids and payloads of its own: a request to one leaves the others as they are. */
  lemma OtherTypesKept(store: Flat, step: Step, entity: string, id: string)
    requires EntityOf(step) != Some(entity)
    ensures var after := Serve(step.prefix, store, step.request).store;
            Ids(after, entity) == Ids(store, entity) && FlatLookup(after, entity, id) == FlatLookup(store, entity, id)
  {
    var event := EventOf(step, Serve(step.prefix, store, step.request).response);
    StepRefines(store, step);
    IdsApplied(store, event, entity);
    LookupApplied(store, event, entity, id);
  }

  /** Canonical decimals of numbers from 1 to `bound`. */
  predicate CanonicalIds(ids: set<string>, bound: nat) {
    forall i :: i in ids ==> Stoi(i).Converted? && 1 <= Stoi(i).n <= bound && i == IntToString(Stoi(i).n)
  }

  lemma NextIdIsCanonical(ids: set<string>)
    requires NextId(ids).Some?
    ensures NextId(ids).value !in ids && CanonicalIds({NextId(ids).value}, |ids| + 1)
  {
    var c := NextIdNumber(ids);
    StoiOfToString(c);
  }

  /** By how much an event changes the number of live entities of a type. */
  function Change(verb: string, event: Event, entity: string): int {
    match event
    case Written(e, _, _) => if e == entity && verb == "POST" then 1 else 0
    case Deleted(e, _) => if e == entity then -1 else 0
    case Nothing => 0
  }

  lemma CountOne(ids: set<string>, id: string)
    ensures |ids + {id}| == |ids| + if id in ids then 0 else 1
    ensures |ids - {id}| == |ids| - if id in ids then 1 else 0
  {
    if id in ids {
      assert ids + {id} == ids;
    } else {
      assert ids - {id} == ids;
    }
  }

  lemma EventCounts(store: Flat, verb: string, event: Event, entity: string)
    requires Fits(store, verb, event)
    ensures |Ids(Apply(store, event), entity)| == |Ids(store, entity)| + Change(verb, event, entity)
  {
    IdsApplied(store, event, entity);
    var ids := Ids(store, entity);
    if !event.Nothing? && event.entity == entity {
      InStore(store, entity, event.id);
      CountOne(ids, event.id);
    }
  }

  lemma EventKeepsCanonical(store: Flat, verb: string, event: Event, entity: string, peak: nat)
    requires Fits(store, verb, event) && CanonicalIds(Ids(store, entity), peak)
    requires |Ids(Apply(store, event), entity)| <= peak
    ensures CanonicalIds(Ids(Apply(store, event), entity), peak)
  {
    IdsApplied(store, event, entity);
    EventCounts(store, verb, event, entity);
    if event.Written? && event.entity == entity {
      InStore(store, entity, event.id);
      if verb == "POST" {
        NextIdIsCanonical(Ids(store, entity));
      }
    }
  }

  lemma TargetCounts(store: Flat, r: Request, t: Target, entity: string)
    ensures var response := ServeTarget(store, r, t).response;
            Change(r.verb, TargetEvent(r, t, response), entity) ==
            (if r.verb == "POST" && response.status == 201 && t.entity == entity then 1 else 0)
            - (if r.verb == "DELETE" && Succeeded(response) && t.entity == entity then 1 else 0)
  {}

  lemma StepCounts(store: Flat, step: Step, entity: string)
    ensures var response := Serve(step.prefix, store, step.request).response;
            Change(step.request.verb, EventOf(step, response), entity) ==
            (if IsPosted(step, response, entity) then 1 else 0) - (if IsDeleted(step, response, entity) then 1 else 0)
  {
    var t := ParsePath(step.prefix, step.request.path);
    if t.Some? {
      TargetCounts(store, step.request, t.value, entity);
    }
  }

  lemma CanonicalGrows(ids: set<string>, m: nat, n: nat)
    requires CanonicalIds(ids, m) && m <= n
    ensures CanonicalIds(ids, n)
  {}

  /** In every run and for every type: ids are canonical decimals of ints from 1 to the peak number
      of live entities, and that number is the POSTs answered 201 less the successful DELETEs. */
  lemma {:induction false} RunKeepsIds(run: seq<Step>, entity: string)
    ensures CanonicalIds(Ids(StoreAfter(run), entity), Peak(run, entity))
    ensures Live(run, entity) == Posts(run, entity) - Deletes(run, entity)
    decreases |run|
  {
    if run != [] {
      var before, last := run[..|run| - 1], run[|run| - 1];
      var event := EventOf(last, ResponseAfter(before, last));
      RunKeepsIds(before, entity);
      StepRefines(StoreAfter(before), last);
      EventCounts(StoreAfter(before), last.request.verb, event, entity);
      StepCounts(StoreAfter(before), last, entity);
      CanonicalGrows(Ids(StoreAfter(before), entity), Peak(before, entity), Peak(run, entity));
      EventKeepsCanonical(StoreAfter(before), last.request.verb, event, entity, Peak(run, entity));
    }
  }
}
