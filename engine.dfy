/** The engine (`Engine`): the server's registration surface. It owns the router and the
    middleware list and holds the port; starting the server is not part of the model. */
module Engines {
  import opened Http
  import opened Routing
  import opened Behaviours

  /** The port used when none is set. */
  const DefaultPort: int := 8080

  class Engine {
    const router: Router<Handler>
    /** The middleware, in registration order. */
    var middlewares: seq<Middleware>
    var port: int

    ghost predicate Valid()
      reads this, router
    {
      router.Valid()
    }

    /** An engine with an empty router, no middleware and the default port. */
    constructor ()
      ensures Valid() && fresh(router)
      ensures router.roots == map[] && middlewares == [] && GetPort() == DefaultPort
    {
      router := new Router();
      middlewares := [];
      port := DefaultPort;
    }

    function GetPort(): int
      reads this
    {
      port
    }

    /** Sets the port; the middleware list is unchanged. */
    method SetPort(p: int)
      modifies this
      ensures GetPort() == p
      ensures middlewares == old(middlewares)
    {
      port := p;
    }

    /** Appends a middleware: it runs after all earlier ones on the way in. */
    method Use(m: Middleware)
      modifies this
      ensures middlewares == old(middlewares) + [m]
      ensures port == old(port)
    {
      middlewares := middlewares + [m];
    }

    /** Registers `pattern` for GET requests; nothing else about the engine changes. */
    method Get(pattern: string, handler: Handler)
      requires Valid()
      modifies router
      ensures Valid()
      ensures router.roots == Register(old(router.roots), GET, pattern, handler)
      ensures middlewares == old(middlewares) && port == old(port)
    {
      router.AddRoute(GET, pattern, handler);
    }

    /** Registers `pattern` for POST requests; nothing else about the engine changes. */
    method Post(pattern: string, handler: Handler)
      requires Valid()
      modifies router
      ensures Valid()
      ensures router.roots == Register(old(router.roots), POST, pattern, handler)
      ensures middlewares == old(middlewares) && port == old(port)
    {
      router.AddRoute(POST, pattern, handler);
    }
  }
}
