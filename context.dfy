/** Per-request state (`Context`): the request, a rewritable path, the route parameters, the
    attributes middleware and handlers pass along, and the status of the response. */
module Contexts {
  import opened Optional
  import opened Http

  class Context {
    /** The inbound request; None stands for a null request. */
    const request: Option<Request>
    /** The current path, initially the request URI. */
    var path: string
    /** Route parameters, written by the router while resolving. */
    var params: map<string, string>
    /** Attributes passed between middleware and handlers. */
    var attributes: map<string, string>
    /** The status of the response object; None stands for a null response. */
    var response: Option<int>

    /** A context for `request` and `response`: the path is the request URI, or "" without a
        request; no parameter and no attribute is set. */
    constructor (request: Option<Request>, response: Option<int>)
      ensures this.request == request && this.response == response
      ensures GetPath() == if request.Some? then request.value.uri else ""
      ensures params == map[] && attributes == map[]
    {
      this.request := request;
      this.response := response;
      this.params := map[];
      this.attributes := map[];
      this.path := if request.Some? then request.value.uri else "";
    }

    function GetPath(): string
      reads this
    {
      path
    }

    /** Rewrites the path; nothing else changes. */
    method SetPath(p: string)
      modifies this
      ensures GetPath() == p
      ensures params == old(params) && attributes == old(attributes) && response == old(response)
    {
      path := p;
    }

    /** The value of parameter `key`, None when it is absent. */
    function GetParam(key: string): (r: Option<string>)
      reads this
      ensures r.Some? <==> key in params
      ensures r.Some? ==> r.value == params[key]
    {
      if key in params then Some(params[key]) else None
    }

    /** Sets parameter `key`, replacing an earlier value; every other parameter is unchanged. */
    method SetParam(key: string, value: string)
      modifies this
      ensures GetParam(key) == Some(value)
      ensures forall k :: k != key ==> GetParam(k) == old(GetParam(k))
      ensures params == old(params)[key := value]
      ensures path == old(path) && attributes == old(attributes) && response == old(response)
    {
      params := params[key := value];
    }

    /** Removes parameter `key` and returns the value it had (None if it had none). */
    method RemoveParam(key: string) returns (previous: Option<string>)
      modifies this
      ensures previous == old(GetParam(key))
      ensures GetParam(key) == None
      ensures forall k :: k != key ==> GetParam(k) == old(GetParam(k))
      ensures params == old(params) - {key}
      ensures path == old(path) && attributes == old(attributes) && response == old(response)
    {
      previous := GetParam(key);
      params := params - {key};
    }

    /** The value of attribute `key`, None when it is absent. */
    function GetAttribute(key: string): (r: Option<string>)
      reads this
      ensures r.Some? <==> key in attributes
      ensures r.Some? ==> r.value == attributes[key]
    {
      if key in attributes then Some(attributes[key]) else None
    }

    /** Sets attribute `key`; other attributes and all parameters are unchanged. */
    method SetAttribute(key: string, value: string)
      modifies this
      ensures GetAttribute(key) == Some(value)
      ensures forall k :: k != key ==> GetAttribute(k) == old(GetAttribute(k))
      ensures attributes == old(attributes)[key := value]
      ensures path == old(path) && params == old(params) && response == old(response)
    {
      attributes := attributes[key := value];
    }

    /** Sets the response status, or does nothing when there is no response; returns this
        context for chaining. */
    method Status(statusCode: int) returns (self: Context)
      modifies this
      ensures self == this
      ensures response == if old(response).Some? then Some(statusCode) else None
      ensures path == old(path) && params == old(params) && attributes == old(attributes)
    {
      if response.Some? {
        response := Some(statusCode);
      }
      self := this;
    }
  }
}
