/** The parts of a servlet request, response and filter chain that the core touches. */
module Servlet {
  import opened Wrappers

  const AUTHORIZATION := "Authorization"
  const REFRESH_TOKEN := "Refresh-Token"
  /** The request attribute under which the filter leaves the authenticated username. */
  const USERNAME := "username"

  /** `getHeader(name)` / `getAttribute(name)`: the value stored under `name`, or null. */
  function Lookup(entries: map<string, string>, name: string): Option<string>
  {
    if name in entries then Some(entries[name]) else None
  }

  /** An inbound request: its URI and headers are fixed, its attributes are set during processing. */
  class Request {
    const uri: string
    const headers: map<string, string>
    var attributes: map<string, string>

    constructor (uri: string, headers: map<string, string>)
      ensures this.uri == uri && this.headers == headers && attributes == map[]
    {
      this.uri := uri;
      this.headers := headers;
      attributes := map[];
    }

    method SetAttribute(name: string, value: string)
      modifies this
      ensures attributes == old(attributes)[name := value]
    {
      attributes := attributes[name := value];
    }
  }

  /** The outgoing response; only its headers matter to the core. */
  class Response {
    var headers: map<string, string>

    constructor ()
      ensures headers == map[]
    {
      headers := map[];
    }

    method SetHeader(name: string, value: string)
      modifies this
      ensures headers == old(headers)[name := value]
    {
      headers := headers[name := value];
    }
  }

  /** The rest of the filter chain; it records how often the request was passed on. */
  class FilterChain {
    var invocations: nat

    constructor ()
      ensures invocations == 0
    {
      invocations := 0;
    }

    method DoFilter()
      modifies this
      ensures invocations == old(invocations) + 1
    {
      invocations := invocations + 1;
    }
  }
}
