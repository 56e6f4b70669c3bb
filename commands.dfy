/**
 * The commands the two parsers build (IDriverCommand and its implementations), and
 * the part of a new-session command both protocol families share: what happens to
 * a reserved worker once its reply is in.
 */
module Commands {

  import opened Faults
  import opened Http
  import opened Responses
  import opened Proxies
  import opened Pool
  import opened Environments

  /**
   * A parsed request. The session id is null-able where the Java constructor accepts
   * null; the new-session commands pass null to their superclass, so `SessionIdOf` is
   * null for them.
   */
  datatype DriverCommand =
    | SeleniumNewBrowserSession(environment: Environment, request: Request)
    | SeleniumTestComplete(testCompleteId: string, request: Request)
    | Selenese(sessionId: Option<string>, request: Request)
    | WebDriverNewBrowserSession(environment: Environment, request: Request)
    | WebDriverTestComplete(sessionId: Option<string>, request: Request)
    | WebDriverGeneric(sessionId: Option<string>, request: Request)

  /** `sessionId()`. */
  function SessionIdOf(c: DriverCommand): (r: Option<string>)
    ensures c.SeleniumNewBrowserSession? || c.WebDriverNewBrowserSession? ==> r == None
    ensures c.SeleniumTestComplete? ==> r == Some(c.testCompleteId)
    ensures c.Selenese? || c.WebDriverTestComplete? || c.WebDriverGeneric? ==> r == c.sessionId
  {
    match c
    case SeleniumNewBrowserSession(_, _) => None
    case WebDriverNewBrowserSession(_, _) => None
    case SeleniumTestComplete(id, _) => Some(id)
    case Selenese(id, _) => id
    case WebDriverTestComplete(id, _) => id
    case WebDriverGeneric(id, _) => id
  }

  /** The message both new-session commands answer with when no worker is free. */
  function NoAvailableRemoteControl(environment: Environment): string {
    "No available remote control for environment '" + environment.name + "'"
  }

  const CouldNotRetrieveSession := "Could not retrieve a new session"

  /** What both parsers throw for a command within a session that names none. */
  const NoSessionIdProvided :=
    "ERROR: No sessionId provided. Most likely your original newBrowserSession command failed."

  /** The answer of a command without a session id; `parameters` is the command's parameter text. */
  function NoSessionIdFor(parameters: string): Response {
    ErrorResponse("Selenium Driver error: No sessionId provided for command '" + parameters + "'")
  }

  /** What `execute` answers with the worker's reply: its response, or the escaping IOException. */
  function RelayResult(reply: Reply): Result<Response> {
    match reply
    case Replied(response) => Ok(response)
    case TransportFailed(m) => Err(Io(m))
  }

  /**
   * The part of `execute` both protocol families share once the session's worker is
   * known: stamp the session `before`, forward the request (an IOException escapes),
   * stamp it `after`, and return the worker's response as it came.
   */
  method Relay(pool: GlobalRemoteControlPool, sessionId: string, request: Request, transport: Transport,
               before: int, after: int)
    returns (r: Result<Response>)
    requires sessionId in pool.sessions
    modifies pool.sessions[sessionId]
    ensures var reply := pool.sessions[sessionId].remoteControl.Forward(request, transport);
            && r == RelayResult(reply)
            && pool.sessions[sessionId].lastActiveAt == (if reply.Replied? then after else before)
  {
    var touched := pool.UpdateSessionLastActiveAt(sessionId, before);
    assert touched == Pass;
    var reply := pool.sessions[sessionId].remoteControl.Forward(request, transport);
    if reply.TransportFailed? {
      return Err(Io(reply.message));
    }
    touched := pool.UpdateSessionLastActiveAt(sessionId, after);
    assert touched == Pass;
    return Ok(reply.response);
  }

  /** Whether the reply admits a new session: the worker answered with an id not yet in use. */
  predicate Admitted(reply: Reply, sessionId: Option<string>, known: set<string>) {
    reply.Replied? && sessionId.Some? && sessionId.value !in known
  }

  /**
   * What a new-session command answers once the worker replied: the reply itself when
   * the session is admitted, otherwise the error envelope of the IOException's message,
   * of "Could not retrieve a new session", or of the duplicate-id exception's message.
   */
  function AdmitResponse(reply: Reply, sessionId: Option<string>, known: set<string>): Response {
    if reply.TransportFailed? then ErrorResponse(reply.message)
    else if sessionId.None? then ErrorResponse(CouldNotRetrieveSession)
    else if sessionId.value in known then ErrorResponse("Session '" + sessionId.value + "' is already asssociated with ")
    else reply.response
  }

  /**
   * The `try` block of `execute` after the forward, with its `catch`: `reply` is what
   * the worker `rc` answered (or the IOException), `sessionId` the id parsed from the
   * answer. Without an id the worker is released; with one it is associated and its
   * session stamped `now`; an exception (the IOException, or an id already in use)
   * releases the worker and becomes the error envelope of its message. Either way the
   * reserved worker ends up associated or released.
   *
   * `rc` was just reserved from its own environment's provisioner, so the release
   * cannot fail and the session just filed can always be stamped.
   */
  method Admit(pool: GlobalRemoteControlPool, rc: RemoteControlProxy, reply: Reply, sessionId: Option<string>, now: int)
    returns (r: Response)
    requires pool.Valid()
    requires rc.sessionInProgress && rc.environment in pool.provisioners
    modifies pool`sessions, rc`sessionInProgress
    ensures pool.Valid()
    ensures r == AdmitResponse(reply, sessionId, old(pool.sessions.Keys))
    ensures !Admitted(reply, sessionId, old(pool.sessions.Keys)) ==>
              !rc.sessionInProgress && pool.sessions == old(pool.sessions)
    ensures Admitted(reply, sessionId, old(pool.sessions.Keys)) ==>
              && rc.sessionInProgress
              && pool.sessions.Keys == old(pool.sessions.Keys) + {sessionId.value}
              && (forall k :: k in old(pool.sessions) ==> pool.sessions[k] == old(pool.sessions[k]))
              && Associated(pool, rc, sessionId)
              && pool.sessions[sessionId.value].lastActiveAt == now
  {
    if reply.TransportFailed? {
      r := ReleaseAfter(pool, rc, reply.message);
      return;
    }
    if sessionId.None? {
      var released := pool.Release(rc);
      assert released == Pass;
      return ErrorResponse(CouldNotRetrieveSession);
    }
    var id := sessionId.value;
    var associated := pool.AssociateWithSession(rc, id, now);
    if associated.Fail? {
      r := ReleaseAfter(pool, rc, Message(associated.fault));
      return;
    }
    var touched := pool.UpdateSessionLastActiveAt(id, now);
    assert touched == Pass;
    return reply.response;
  }

  /** The worker `rc` has a session in the pool under the id. */
  predicate Associated(pool: GlobalRemoteControlPool, rc: RemoteControlProxy, sessionId: Option<string>)
    reads pool
  {
    sessionId.Some? && pool.Retrieve(sessionId.value) == Ok(rc)
  }

  /** The `catch` block: release the worker, answer with the exception's message. */
  method ReleaseAfter(pool: GlobalRemoteControlPool, rc: RemoteControlProxy, message: string) returns (r: Response)
    requires rc.sessionInProgress && rc.environment in pool.provisioners
    modifies rc`sessionInProgress
    ensures r == ErrorResponse(message) && !rc.sessionInProgress
  {
    var released := pool.Release(rc);
    assert released == Pass;
    return ErrorResponse(message);
  }
}
