/**
 * The boundary to the outside world: inbound requests, the HTTP calls the hub makes
 * to a worker, and what the network answers. The network itself is an oracle.
 */
module Http {

  import opened Faults
  import opened Responses

  /** What the hub reads of an inbound servlet request. `uri` is null-able, as `getRequestURI()` is. */
  datatype Request = Request(
    verb: string,
    uri: Option<string>,
    parameters: map<string, string>,
    body: string)

  /** `getParameter(name)` on a request's parameter map: the value, or null. */
  function ParameterOf(parameters: map<string, string>, name: string): Option<string> {
    if name in parameters then Some(parameters[name]) else None
  }

  /** An HTTP call to a worker, as the HttpClient methods are invoked. */
  datatype WireCall =
    | WebDriverPost(url: string, request: Request)
    | WebDriverDelete(url: string, request: Request)
    | WebDriverPut(url: string, request: Request)
    | WebDriverGet(url: string, request: Request)
    | LegacyPost(url: string, parameters: map<string, string>)

  /** What a call to a worker produced: a response, or an IOException with its message. */
  datatype Reply = Replied(response: Response) | TransportFailed(message: string)

  /** The network, as an oracle: the reply a worker gives to a call. */
  type Transport = WireCall -> Reply

  /** One heartbeat GET: an exception, or a response with a status code. */
  datatype Probe = ProbeFailed | ProbeStatus(statusCode: int)

  /**
   * The heartbeat oracle: the outcome of the probe of a ping URL made when the
   * worker's failed-heartbeat counter stands at the given value.
   */
  type Heartbeat = (string, int) -> Probe

  predicate Healthy(p: Probe) {
    p.ProbeStatus? && p.statusCode == 200
  }
}
