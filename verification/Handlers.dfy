/** The router with the handlers it makes: the CRUD handlers of one server share a store,
    and what the other handlers answer is left open. */
module Handlers {
  import opened Folding
  import opened Text
  import opened HttpRequest
  import opened HttpResponse
  import opened Store
  import opened PathRouter
  import CrudHandler

  /** The router with its handlers at one time; None where there is no handler at all. */
  type App = Request -> Option<Response>

  /** What becomes of a request: the response, and the store the handlers leave behind. */
  datatype Handled = Handled(response: Option<Response>, store: Flat)

  /** The handlers as a function of the store they find. */
  type Serving = (Flat, Request) -> Handled

  function AppOf(serving: Serving, store: Flat): App {
    (r: Request) => serving(store, r).response
  }

  lemma AppIsServing(serving: Serving, store: Flat, r: Request)
    ensures AppOf(serving, store)(r) == serving(store, r).response
  {}

  /** What does not change while the server runs: the routes, and the answers of other handlers. */
  datatype Site = Site(routes: Routes, others: App)

  predicate IsCrud(routes: Routes, route: Option<string>) {
    route.Some? && route.value in routes && routes[route.value].handlerType == "CrudHandler"
  }

  ghost function Handle(site: Site, store: Flat, r: Request): Handled {
    var route := Longest(site.routes.Keys, r.path);
    if IsCrud(site.routes, route) then
      var served := CrudHandler.Serve(route.value, store, r);
      Handled(Some(served.response), served.store)
    else
      Handled(site.others(r), store)
  }

  ghost function ServingOf(site: Site): Serving {
    Folded2((store: Flat, r: Request) => Handle(site, store, r))
  }

  lemma ServingIsHandle(site: Site, store: Flat, r: Request)
    ensures ServingOf(site)(store, r) == Handle(site, store, r)
  {
    Unfold2((store: Flat, r: Request) => Handle(site, store, r), store, r);
  }

  /** Requests whose route has another handler, or that have no route, leave the store alone. */
  lemma ServedByRoute(site: Site, store: Flat, r: Request)
    ensures var route, handled := Longest(site.routes.Keys, r.path), ServingOf(site)(store, r);
            if route.Some? && site.routes[route.value].handlerType == "CrudHandler" then
              var served := CrudHandler.Serve(route.value, store, r);
              handled.response == Some(served.response) && handled.store == served.store
            else
              handled.response == site.others(r) && handled.store == store
  {
    ServingIsHandle(site, store, r);
  }

  class Handlers {
    const router: PathRouter
    const others: App
    const crudFs: MockFilesystem

    constructor (router: PathRouter, others: App)
      ensures this.router == router && this.others == others && fresh(crudFs) && crudFs.View() == map[]
    {
      this.router, this.others := router, others;
      crudFs := new MockFilesystem();
    }

    ghost function Fixed(): Serving {
      ServingOf(Site(router.routes, others))
    }

    ghost function AppFor(store: Flat): App {
      AppOf(Fixed(), store)
    }

    /** The handler is matched and made for the request, and handles it. */
    method HandleRequest(request: Request) returns (response: Option<Response>)
      modifies crudFs
      ensures Handled(response, crudFs.View()) == Fixed()(old(crudFs.View()), request)
    {
      ServingIsHandle(Site(router.routes, others), crudFs.View(), request);
      var config, prefix := router.MatchHandler(request.path);
      if config.handlerType == "CrudHandler" {
        var handler := new CrudHandler.CrudHandler(prefix, crudFs);
        var answer := handler.HandleRequest(request);
        return Some(answer);
      }
      return others(request);
    }
  }
}
