/** The application callbacks the core calls: a `Handler` takes the request context, a
    `Middleware` takes the context and the next handler. Their code is the application's, so the
    model gives each a small scripted behaviour that covers the cases the dispatcher must handle:
    returning, throwing, calling or not calling `next`, and catching what `next` throws. */
module Behaviours {
  import opened Optional

  /** What the execution of a request records, in order. */
  datatype Event =
    | Logged(tag: string)    // a middleware ran one of its steps
    | Handled(tag: string)   // the route handler ran

  /** A route handler: records `Handled(tag)`, sets the response status to `setStatus` if
      given, then returns, or throws when `throws` holds. */
  datatype Handler = Handler(tag: string, setStatus: Option<int>, throws: bool)

  /** A middleware. */
  datatype Middleware =
      /** records `before`, calls `next`, records `after` (not reached if `next` throws) */
    | Around(before: string, after: string)
      /** records `tag` and returns without calling `next` */
    | Halt(tag: string)
      /** records `tag` and throws without calling `next` */
    | FailBefore(tag: string)
      /** calls `next`, then records `tag` and throws (not reached if `next` throws) */
    | FailAfter(tag: string)
      /** calls `next` inside a try block; if it throws, records `tag` and sets the response
          status to `statusCode` instead of letting the exception out */
    | Rescue(tag: string, statusCode: int)
}
