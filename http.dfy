/** The few HTTP notions the dispatch core takes from the transport library: request methods,
    the parts of a request the core reads, and the two error statuses it answers with. */
module Http {

  /** A request method, identified by its name: two methods are the same route key exactly when
      their names are equal, whether the method is a predefined constant or built from a name. */
  datatype Method = Method(name: string)

  const GET: Method := Method("GET")
  const POST: Method := Method("POST")

  /** What the core reads from an inbound request: its method and its URI. Headers and body are
      only handed to application code and are not modelled. */
  datatype Request = Request(httpMethod: Method, uri: string)

  /** The statuses the dispatcher itself sends. */
  datatype ErrorStatus = NotFound | InternalServerError {

    /** The numeric status code. */
    function Code(): int
    {
      match this
      case NotFound => 404
      case InternalServerError => 500
    }

    /** The status line text (code and reason phrase), which the dispatcher sends as the body
        of an error response. */
    function Text(): string
    {
      match this
      case NotFound => "404 Not Found"
      case InternalServerError => "500 Internal Server Error"
    }
  }

  /** The default status of a freshly created response. */
  const OK: int := 200
}
