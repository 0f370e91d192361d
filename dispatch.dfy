/** Request dispatch (`HttpHandler.channelRead0`): look the route up, answer 404 when there is
    none, otherwise wrap the handler in the middleware from last to first, run the result, and
    answer 500 when an exception escapes it. Responses are recorded, not sent. */
module Dispatch {
  import opened Optional
  import opened Http
  import opened Trie
  import opened Routing
  import opened Contexts
  import opened Behaviours
  import opened Engines

  /** A response handed to the channel: the context's response as the route completed
      (`writeResponse`), or an error response whose body is the status text (`sendError`). */
  datatype Response = Written(status: int) | ErrorSent(status: int, body: string)

  /** The error response for `e`: its status, with the status line as body. */
  function SendError(e: ErrorStatus): (r: Response)
    ensures e.NotFound? ==> r == ErrorSent(404, "404 Not Found")
    ensures e.InternalServerError? ==> r == ErrorSent(500, "500 Internal Server Error")
  {
    ErrorSent(e.Code(), e.Text())
  }

  /** A composed handler: the route's terminal step, or a middleware given the rest of the chain
      as its `next`. */
  datatype Chain = Terminal(handler: Handler) | Wrap(middleware: Middleware, next: Chain)

  /** The handler at the bottom of a chain. */
  function TerminalOf(c: Chain): Handler
  {
    match c
    case Terminal(h) => h
    case Wrap(_, next) => TerminalOf(next)
  }

  /** The chain with `mws[0]` outermost and `h` innermost. */
  function Compose(mws: seq<Middleware>, h: Handler): (c: Chain)
    ensures TerminalOf(c) == h
  {
    if mws == [] then Terminal(h) else Wrap(mws[0], Compose(mws[1..], h))
  }

  /** Builds the composed handler as the dispatcher does: start from the terminal step and wrap
      it in each middleware from the last index down to the first. */
  method BuildChain(mws: seq<Middleware>, h: Handler) returns (chain: Chain)
    ensures chain == Compose(mws, h)
  {
    chain := Terminal(h);
    var i := |mws|;
    while i > 0
      invariant 0 <= i <= |mws|
      invariant chain == Compose(mws[i..], h)
    {
      i := i - 1;
      assert mws[i..][1..] == mws[i + 1..];
      chain := Wrap(mws[i], chain);
    }
    assert mws[0..] == mws;
  }

  /** What a run has produced so far: the response status, the events, the responses written. */
  datatype State = State(status: int, trace: seq<Event>, writes: seq<Response>)

  /** The end of a run: the state, and whether an exception escaped. */
  datatype Run = Run(state: State, threw: bool)

  function Log(s: State, e: Event): State
  {
    s.(trace := s.trace + [e])
  }

  /** The status after handler `h` ran on a response with status `status`. */
  function StatusAfter(h: Handler, status: int): int
  {
    h.setStatus.GetOr(status)
  }

  /** Runs a composed handler. The terminal step runs the route handler and, only if it
      returns normally, writes the response; an exception leaves a frame at once, skipping the
      rest of every enclosing middleware until one catches it. */
  function Exec(c: Chain, s: State): (r: Run)
    ensures |s.trace| < |r.state.trace| && r.state.trace[..|s.trace|] == s.trace
    ensures |s.writes| <= |r.state.writes| <= |s.writes| + 1
    ensures r.state.writes[..|s.writes|] == s.writes
    ensures forall i :: |s.writes| <= i < |r.state.writes| ==> r.state.writes[i].Written?
  {
    match c
    case Terminal(h) =>
      var s1 := Log(s, Handled(h.tag)).(status := StatusAfter(h, s.status));
      if h.throws then Run(s1, true)
      else Run(s1.(writes := s1.writes + [Written(s1.status)]), false)
    case Wrap(m, next) =>
      match m
      case Around(before, after) =>
        var r := Exec(next, Log(s, Logged(before)));
        if r.threw then r else Run(Log(r.state, Logged(after)), false)
      case Halt(tag) =>
        Run(Log(s, Logged(tag)), false)
      case FailBefore(tag) =>
        Run(Log(s, Logged(tag)), true)
      case FailAfter(tag) =>
        var r := Exec(next, s);
        if r.threw then r else Run(Log(r.state, Logged(tag)), true)
      case Rescue(tag, statusCode) =>
        var r := Exec(next, s);
        if r.threw then Run(Log(r.state, Logged(tag)).(status := statusCode), false) else r
  }

  /** What handling one request produces: the events, and the responses in the order written. */
  datatype Outcome = Outcome(trace: seq<Event>, responses: seq<Response>)

  /** A routed request: the chain run from a response with status 200, then the 500 answer
      if an exception escaped it. */
  function Respond(mws: seq<Middleware>, h: Handler): (out: Outcome)
    ensures out.trace != [] && |out.responses| <= 2
    ensures forall i :: 0 <= i < |out.responses| ==>
              out.responses[i].Written? || out.responses[i] == ErrorSent(500, "500 Internal Server Error")
  {
    var r := Exec(Compose(mws, h), State(OK, [], []));
    Outcome(r.state.trace, r.state.writes + if r.threw then [SendError(InternalServerError)] else [])
  }

  /** The dispatch of `request` against the routes `roots` and the middleware `mws`. */
  function Dispatch(roots: map<Method, Node<Handler>>, mws: seq<Middleware>, request: Request)
    : (out: Outcome)
    ensures out == Outcome([], [ErrorSent(404, "404 Not Found")])
        <==> Lookup(roots, request.httpMethod, request.uri).None?
    ensures |out.responses| <= 2
  {
    match Lookup(roots, request.httpMethod, request.uri)
    case None => Outcome([], [SendError(NotFound)])
    case Some(h) => Respond(mws, h)
  }

  /** Handles one request (`channelRead0`): a fresh context whose response has status 200,
      route lookup, the 404 answer, the chain built from the engine's middleware, its run, and
      the 500 answer for an escaping exception. */
  method HandleRequest(engine: Engine, request: Request) returns (out: Outcome)
    ensures out == Dispatch(engine.router.roots, engine.middlewares, request)
  {
    var context := new Context(Some(request), Some(OK));
    var handler := engine.router.GetRoute(request.httpMethod, request.uri, context);
    if handler.None? {
      out := Outcome([], [SendError(NotFound)]);
      return;
    }
    var chain := BuildChain(engine.middlewares, handler.value);
    var run := Exec(chain, State(context.response.value, [], []));
    if run.threw {
      out := Outcome(run.state.trace, run.state.writes + [SendError(InternalServerError)]);
    } else {
      out := Outcome(run.state.trace, run.state.writes);
    }
  }

  // ---------------------------------------------------------------------------------------
  // Ordering, short-circuit and error laws

  /** All middleware call `next` once, between their two steps. */
  predicate AllAround(mws: seq<Middleware>)
  {
    forall i :: 0 <= i < |mws| ==> mws[i].Around?
  }

  /** The `before` steps of the middleware, in registration order. */
  function Befores(mws: seq<Middleware>): seq<Event>
  {
    if mws == [] then []
    else (if mws[0].Around? then [Logged(mws[0].before)] else []) + Befores(mws[1..])
  }

  /** The `after` steps of the middleware, in reverse registration order. */
  function Afters(mws: seq<Middleware>): seq<Event>
  {
    if mws == [] then []
    else Afters(mws[1..]) + (if mws[0].Around? then [Logged(mws[0].after)] else [])
  }

  /** Onion order: with middleware that all call `next`, and a handler that returns, the run
      records every `before` in registration order, then the handler, then every `after` in
      reverse order, and writes exactly one response, carrying the handler's status. */
  lemma {:induction false} OnionOrder(mws: seq<Middleware>, h: Handler, s: State)
    requires AllAround(mws) && !h.throws
    ensures Exec(Compose(mws, h), s)
         == Run(State(StatusAfter(h, s.status),
                      s.trace + Befores(mws) + [Handled(h.tag)] + Afters(mws),
                      s.writes + [Written(StatusAfter(h, s.status))]),
                false)
  {
    if mws != [] {
      var m := mws[0];
      assert AllAround(mws[1..]) by {
        forall i | 0 <= i < |mws[1..]| ensures mws[1..][i].Around? { assert mws[1..][i] == mws[i + 1]; }
      }
      OnionOrder(mws[1..], h, Log(s, Logged(m.before)));
      var b, a := Befores(mws[1..]), Afters(mws[1..]);
      assert Befores(mws) == [Logged(m.before)] + b;
      assert Afters(mws) == a + [Logged(m.after)];
      var inner := s.trace + [Logged(m.before)] + b + [Handled(h.tag)] + a;
      assert inner == s.trace + Befores(mws) + [Handled(h.tag)] + a;
      assert inner + [Logged(m.after)] == s.trace + Befores(mws) + [Handled(h.tag)] + Afters(mws);
    }
  }

  /** With middleware that all call `next`, an exception from the handler unwinds through every
      middleware: each `before` step has run, no `after` step runs, nothing is written, and the
      exception escapes the chain. */
  lemma {:induction false} HandlerErrorUnwinds(mws: seq<Middleware>, h: Handler, s: State)
    requires AllAround(mws) && h.throws
    ensures Exec(Compose(mws, h), s)
         == Run(State(StatusAfter(h, s.status), s.trace + Befores(mws) + [Handled(h.tag)], s.writes),
                true)
  {
    if mws != [] {
      var m := mws[0];
      assert AllAround(mws[1..]) by {
        forall i | 0 <= i < |mws[1..]| ensures mws[1..][i].Around? { assert mws[1..][i] == mws[i + 1]; }
      }
      HandlerErrorUnwinds(mws[1..], h, Log(s, Logged(m.before)));
      var b := Befores(mws[1..]);
      assert Befores(mws) == [Logged(m.before)] + b;
      assert s.trace + [Logged(m.before)] + b + [Handled(h.tag)]
          == s.trace + Befores(mws) + [Handled(h.tag)];
    }
  }

  /** With middleware before it that all call `next`, a middleware that does not call `next`
      short-circuits: the middleware after it and the handler never run, nothing is written, and
      the enclosing middleware finish normally. `HaltAnywhere` drops the condition on the
      middleware before it. */
  lemma {:induction false} HaltShortCircuits(pre: seq<Middleware>, tag: string, rest: seq<Middleware>,
                                             h: Handler, s: State)
    requires AllAround(pre)
    ensures Exec(Compose(pre + [Halt(tag)] + rest, h), s)
         == Run(State(s.status, s.trace + Befores(pre) + [Logged(tag)] + Afters(pre), s.writes), false)
  {
    if pre == [] {
      assert pre + [Halt(tag)] + rest == [Halt(tag)] + rest;
    } else {
      var m := pre[0];
      assert AllAround(pre[1..]) by {
        forall i | 0 <= i < |pre[1..]| ensures pre[1..][i].Around? { assert pre[1..][i] == pre[i + 1]; }
      }
      var all := pre + [Halt(tag)] + rest;
      assert all[0] == m && all[1..] == pre[1..] + [Halt(tag)] + rest;
      assert Compose(all, h) == Wrap(m, Compose(pre[1..] + [Halt(tag)] + rest, h));
      HaltShortCircuits(pre[1..], tag, rest, h, Log(s, Logged(m.before)));
      var b, a := Befores(pre[1..]), Afters(pre[1..]);
      assert Befores(pre) == [Logged(m.before)] + b;
      assert Afters(pre) == a + [Logged(m.after)];
      var inner := s.trace + [Logged(m.before)] + b + [Logged(tag)] + a;
      assert inner == s.trace + Befores(pre) + [Logged(tag)] + a;
      assert inner + [Logged(m.after)] == s.trace + Befores(pre) + [Logged(tag)] + Afters(pre);
    }
  }

  /** Running `c` from `s` never reaches its route handler and writes nothing. */
  ghost predicate HandlerKeptOut(c: Chain, s: State)
  {
    var r := Exec(c, s);
    Handled(TerminalOf(c).tag) !in r.state.trace[|s.trace|..] && r.state.writes == s.writes
  }

  /** A pass-through middleware keeps the handler out when its `next` does. */
  lemma AroundKeepsOut(before: string, after: string, next: Chain, s: State)
    requires HandlerKeptOut(next, Log(s, Logged(before)))
    ensures HandlerKeptOut(Wrap(Around(before, after), next), s)
  {
    var s1 := Log(s, Logged(before));
    var r1 := Exec(next, s1);
    var r := Exec(Wrap(Around(before, after), next), s);
    assert r1.state.trace[|s.trace|..] == [Logged(before)] + r1.state.trace[|s1.trace|..] by {
      assert r1.state.trace[..|s1.trace|] == s1.trace;
    }
    if !r1.threw {
      assert r.state.trace[|s.trace|..] == r1.state.trace[|s.trace|..] + [Logged(after)];
    }
  }

  /** A middleware that calls `next` without changing the state first (`FailAfter`, `Rescue`)
      keeps the handler out when its `next` does. */
  lemma NextFirstKeepsOut(m: Middleware, next: Chain, s: State)
    requires m.FailAfter? || m.Rescue?
    requires HandlerKeptOut(next, s)
    ensures HandlerKeptOut(Wrap(m, next), s)
  {
    var r1 := Exec(next, s);
    var r := Exec(Wrap(m, next), s);
    if r.state.trace != r1.state.trace {
      assert r.state.trace[|s.trace|..] == r1.state.trace[|s.trace|..] + [Logged(m.tag)];
    }
  }

  /** A middleware that does not call `next` short-circuits, whatever the middleware before it
      do (pass through, catch, throw or stop themselves): the run never records the handler and
      writes nothing. */
  lemma {:induction false} HaltAnywhere(pre: seq<Middleware>, tag: string, rest: seq<Middleware>,
                                        h: Handler, s: State)
    ensures var r := Exec(Compose(pre + [Halt(tag)] + rest, h), s);
            Handled(h.tag) !in r.state.trace[|s.trace|..] && r.state.writes == s.writes
  {
    var all := pre + [Halt(tag)] + rest;
    if pre == [] {
      assert all == [Halt(tag)] + rest;
      assert Exec(Compose(all, h), s).state.trace[|s.trace|..] == [Logged(tag)];
    } else {
      assert all[0] == pre[0] && all[1..] == pre[1..] + [Halt(tag)] + rest;
      var next := Compose(pre[1..] + [Halt(tag)] + rest, h);
      assert Compose(all, h) == Wrap(pre[0], next);
      match pre[0]
      case Around(before, after) =>
        HaltAnywhere(pre[1..], tag, rest, h, Log(s, Logged(before)));
        AroundKeepsOut(before, after, next, s);
      case Halt(t) =>
        assert Exec(Wrap(pre[0], next), s).state.trace[|s.trace|..] == [Logged(t)];
      case FailBefore(t) =>
        assert Exec(Wrap(pre[0], next), s).state.trace[|s.trace|..] == [Logged(t)];
      case FailAfter(_) =>
        HaltAnywhere(pre[1..], tag, rest, h, s);
        NextFirstKeepsOut(pre[0], next, s);
      case Rescue(_, _) =>
        HaltAnywhere(pre[1..], tag, rest, h, s);
        NextFirstKeepsOut(pre[0], next, s);
    }
  }

  /** Whatever the middleware do, a run writes a response exactly when the route handler ran
      and returned normally (that it only appends, and writes at most one normal response, is
      part of the contract of `Exec`). */
  lemma {:induction false} WrittenOnlyAfterHandlerReturns(c: Chain, s: State)
    ensures var r := Exec(c, s);
            |r.state.writes| == |s.writes| + 1 <==>
              Handled(TerminalOf(c).tag) in r.state.trace[|s.trace|..] && !TerminalOf(c).throws
  {
    var r := Exec(c, s);
    var h := TerminalOf(c);
    match c
    case Terminal(_) =>
      assert r.state.trace[|s.trace|..] == [Handled(h.tag)];
    case Wrap(m, next) =>
      match m
      case Around(before, after) =>
        var s1 := Log(s, Logged(before));
        WrittenOnlyAfterHandlerReturns(next, s1);
        var r1 := Exec(next, s1);
        assert r1.state.trace[|s.trace|..] == [Logged(before)] + r1.state.trace[|s1.trace|..] by {
          assert r1.state.trace[..|s1.trace|] == s1.trace;
        }
        if !r1.threw {
          assert r.state.trace[|s.trace|..] == r1.state.trace[|s.trace|..] + [Logged(after)];
        }
      case Halt(tag) =>
        assert r.state.trace[|s.trace|..] == [Logged(tag)];
      case FailBefore(tag) =>
        assert r.state.trace[|s.trace|..] == [Logged(tag)];
      case FailAfter(tag) =>
        WrittenOnlyAfterHandlerReturns(next, s);
        var r1 := Exec(next, s);
        if !r1.threw {
          assert r.state.trace[|s.trace|..] == r1.state.trace[|s.trace|..] + [Logged(tag)];
        }
      case Rescue(tag, _) =>
        WrittenOnlyAfterHandlerReturns(next, s);
        var r1 := Exec(next, s);
        if r1.threw {
          assert r.state.trace[|s.trace|..] == r1.state.trace[|s.trace|..] + [Logged(tag)];
        }
  }

  // ---------------------------------------------------------------------------------------
  // Dispatch laws

  /** A request with no route gets one 404 response whose body is the status text, and no
      middleware or handler runs. */
  lemma NotFoundSkipsChain(roots: map<Method, Node<Handler>>, mws: seq<Middleware>, request: Request)
    requires Lookup(roots, request.httpMethod, request.uri).None?
    ensures Dispatch(roots, mws, request) == Outcome([], [ErrorSent(404, "404 Not Found")])
  {
  }

  /** A routed request gets the normal response exactly when the handler ran and returned,
      and after it a 500 response exactly when an exception escaped the chain (from the handler
      or from a middleware); so it gets at most two responses. */
  lemma RespondResponses(mws: seq<Middleware>, h: Handler)
    ensures var r := Exec(Compose(mws, h), State(OK, [], []));
            var out := Respond(mws, h);
            && |out.responses| == (if Handled(h.tag) in out.trace && !h.throws then 1 else 0)
                                   + (if r.threw then 1 else 0)
            && (exists st :: Written(st) in out.responses) == (Handled(h.tag) in out.trace && !h.throws)
            && (ErrorSent(500, "500 Internal Server Error") in out.responses <==> r.threw)
            && (r.threw ==> out.responses[|out.responses| - 1] == ErrorSent(500, "500 Internal Server Error"))
  {
    var s := State(OK, [], []);
    WrittenOnlyAfterHandlerReturns(Compose(mws, h), s);
    var r := Exec(Compose(mws, h), s);
    assert r.state.trace[|s.trace|..] == r.state.trace;
    var out := Respond(mws, h);
    if |r.state.writes| == 1 {
      assert Written(r.state.writes[0].status) in out.responses;
    }
  }

  /** The same laws for a request whose route lookup succeeds. */
  lemma RoutedResponses(roots: map<Method, Node<Handler>>, mws: seq<Middleware>, request: Request)
    requires Lookup(roots, request.httpMethod, request.uri).Some?
    ensures var h := Lookup(roots, request.httpMethod, request.uri).value;
            var r := Exec(Compose(mws, h), State(OK, [], []));
            var out := Dispatch(roots, mws, request);
            && |out.responses| == (if Handled(h.tag) in out.trace && !h.throws then 1 else 0)
                                   + (if r.threw then 1 else 0)
            && (exists st :: Written(st) in out.responses) == (Handled(h.tag) in out.trace && !h.throws)
            && (ErrorSent(500, "500 Internal Server Error") in out.responses <==> r.threw)
            && (r.threw ==> out.responses[|out.responses| - 1] == ErrorSent(500, "500 Internal Server Error"))
  {
    var h := Lookup(roots, request.httpMethod, request.uri).value;
    assert Dispatch(roots, mws, request) == Respond(mws, h);
    RespondResponses(mws, h);
  }

  /** With middleware that all call `next`, a handled request's events are the onion order and
      its one response carries the handler's status (200 unless the handler set another); a
      handler that throws leaves the befores, itself, and a single 500. */
  lemma RespondOnion(mws: seq<Middleware>, h: Handler)
    requires AllAround(mws)
    ensures Respond(mws, h)
         == if h.throws
            then Outcome(Befores(mws) + [Handled(h.tag)], [ErrorSent(500, "500 Internal Server Error")])
            else Outcome(Befores(mws) + [Handled(h.tag)] + Afters(mws), [Written(StatusAfter(h, OK))])
  {
    if h.throws {
      HandlerErrorUnwinds(mws, h, State(OK, [], []));
    } else {
      OnionOrder(mws, h, State(OK, [], []));
    }
  }

  /** The onion law for a request whose route lookup succeeds. */
  lemma DispatchOnion(roots: map<Method, Node<Handler>>, mws: seq<Middleware>, request: Request)
    requires Lookup(roots, request.httpMethod, request.uri).Some?
    requires AllAround(mws)
    ensures var h := Lookup(roots, request.httpMethod, request.uri).value;
            Dispatch(roots, mws, request)
              == if h.throws
                 then Outcome(Befores(mws) + [Handled(h.tag)], [ErrorSent(500, "500 Internal Server Error")])
                 else Outcome(Befores(mws) + [Handled(h.tag)] + Afters(mws), [Written(StatusAfter(h, OK))])
  {
    var h := Lookup(roots, request.httpMethod, request.uri).value;
    assert Dispatch(roots, mws, request) == Respond(mws, h);
    RespondOnion(mws, h);
  }

  /** Two middleware M1 then M2 around a handler H that returns run as M1-before, M2-before, H,
      M2-after, M1-after. */
  lemma TwoMiddlewareOrder(b1: string, a1: string, b2: string, a2: string, h: Handler)
    requires !h.throws
    ensures Respond([Around(b1, a1), Around(b2, a2)], h).trace
         == [Logged(b1), Logged(b2), Handled(h.tag), Logged(a2), Logged(a1)]
  {
    var mws := [Around(b1, a1), Around(b2, a2)];
    RespondOnion(mws, h);
    assert mws[1..] == [Around(b2, a2)] && mws[1..][1..] == [];
    assert Befores(mws[1..]) == [Logged(b2)] + Befores([]);
    assert Befores(mws) == [Logged(b1)] + Befores(mws[1..]);
    assert Afters(mws[1..]) == Afters([]) + [Logged(a2)];
    assert Afters(mws) == Afters(mws[1..]) + [Logged(a1)];
  }

  /** An outermost middleware that catches exceptions turns whatever the chain inside it throws
      into a normal return, so no 500 is sent; and since the handler did not return, no response
      is written at all, whatever the middleware inside it do. */
  lemma RescueSuppressesError(tag: string, statusCode: int, rest: seq<Middleware>, h: Handler)
    requires h.throws
    ensures Respond([Rescue(tag, statusCode)] + rest, h).responses == []
  {
    WrittenOnlyAfterHandlerReturns(Compose(rest, h), State(OK, [], []));
    assert ([Rescue(tag, statusCode)] + rest)[1..] == rest;
  }
}
