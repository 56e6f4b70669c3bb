/**
 * The legacy Selenium RC commands (commands/selenium): opening a session on a freshly
 * reserved worker, and relaying a command within a session.
 */
module SeleniumCommands {

  import opened Faults
  import opened Http
  import opened Responses
  import opened Proxies
  import opened Provisioning
  import opened Pool
  import opened Environments
  import opened Commands

  const SessionIdPrefix := "OK,"

  /**
   * `parseSessionId(body)`: the whole body must match `OK,([^,]*)`; the id is the group,
   * which may be empty.
   */
  function ParseNewSessionId(responseBody: string): (r: Option<string>)
    ensures r.Some? <==> StartsWithOK(responseBody) && ',' !in responseBody[|SessionIdPrefix|..]
    ensures r.Some? ==> responseBody == SessionIdPrefix + r.value
  {
    if StartsWithOK(responseBody) && ',' !in responseBody[|SessionIdPrefix|..] then
      Some(responseBody[|SessionIdPrefix|..])
    else None
  }

  predicate StartsWithOK(s: string) {
    |SessionIdPrefix| <= |s| && s[..|SessionIdPrefix|] == SessionIdPrefix
  }

  /** The id a worker writes after "OK," is the id the hub reads back, even an empty one. */
  lemma ParseNewSessionIdRoundTrip(sessionId: string)
    requires ',' !in sessionId
    ensures ParseNewSessionId(SessionIdPrefix + sessionId) == Some(sessionId)
  {
    assert (SessionIdPrefix + sessionId)[|SessionIdPrefix|..] == sessionId;
  }

  /** A body with a second comma, or without the prefix, yields no id. */
  lemma ParseNewSessionIdRejects(responseBody: string)
    ensures ParseNewSessionId(responseBody) == None <==>
              forall s :: ',' !in s ==> responseBody != SessionIdPrefix + s
  {
    if ParseNewSessionId(responseBody) == None {
      forall s | ',' !in s ensures responseBody != SessionIdPrefix + s {
        if responseBody == SessionIdPrefix + s {
          ParseNewSessionIdRoundTrip(s);
        }
      }
    }
  }

  /** The id a new-session command parses out of its worker's reply; none when the call failed. */
  function ParsedId(reply: Reply): Option<string> {
    if reply.Replied? then ParseNewSessionId(reply.response.body) else None
  }

  /**
   * `NewBrowserSessionCommand.execute(pool)`: reserve a worker for the environment
   * (NoSuchEnvironmentException escapes), answer "No available remote control" when
   * there is none, otherwise forward the request and admit the session the worker
   * reports. `reserved` is the worker the pool handed out.
   */
  method ExecuteNewBrowserSession(pool: GlobalRemoteControlPool, environment: Environment, request: Request,
                                  heartbeat: Heartbeat, transport: Transport, now: int)
    returns (r: Result<Response>, ghost reserved: Option<RemoteControlProxy>)
    requires pool.Valid()
    modifies pool`sessions
    modifies if environment.name in pool.provisioners then {pool.provisioners[environment.name]} else {}
    modifies if environment.name in pool.provisioners then pool.provisioners[environment.name].remoteControls else []
    ensures pool.Valid()
    ensures environment.name !in old(pool.provisioners) <==> r == Err(NoSuchEnvironment(environment.name))
    ensures environment.name in old(pool.provisioners) ==>
              var s := old(pool.provisioners[environment.name].remoteControls);
              Planned(s, old(SnapshotOf(s)), heartbeat, reserved, pool.provisioners[environment.name].remoteControls)
    ensures reserved.None? ==> pool.sessions == old(pool.sessions)
    ensures reserved.None? && r.Ok? ==> r.value == ErrorResponse(NoAvailableRemoteControl(environment))
    ensures reserved.Some? ==>
              var rc := reserved.value;
              var reply := rc.Forward(request, transport);
              && r == Ok(AdmitResponse(reply, ParsedId(reply), old(pool.sessions.Keys)))
              && (Admitted(reply, ParsedId(reply), old(pool.sessions.Keys)) ==>
                    rc.sessionInProgress && Associated(pool, rc, ParsedId(reply)) &&
                    pool.sessions[ParsedId(reply).value].lastActiveAt == now)
              && (!Admitted(reply, ParsedId(reply), old(pool.sessions.Keys)) ==>
                    !rc.sessionInProgress && pool.sessions == old(pool.sessions))
  {
    var found := pool.Reserve(environment, heartbeat);
    if found.Err? {
      return Err(found.fault), None;
    }
    reserved := found.value;
    if found.value.None? {
      return Ok(ErrorResponse(NoAvailableRemoteControl(environment))), reserved;
    }
    var rc := found.value.value;
    var reply := rc.Forward(request, transport);
    var sessionId := ParsedId(reply);
    var response := Admit(pool, rc, reply, sessionId, now);
    return Ok(response), reserved;
  }

  /**
   * `SeleneseCommand.execute(pool)`: without a session id, the error envelope naming the
   * command's parameters (rendered by `describe`, standing for `HttpParameters.toString`)
   * and no pool call. Otherwise the session's worker is looked up (NoSuchSessionException
   * escapes), the session stamped `before`, the request forwarded (an IOException escapes),
   * the session stamped `after`, and the worker's response returned as it came.
   */
  method ExecuteSelenese(pool: GlobalRemoteControlPool, sessionId: Option<string>, request: Request,
                         transport: Transport, describe: map<string, string> -> string, before: int, after: int)
    returns (r: Result<Response>)
    modifies if sessionId.Some? && sessionId.value in pool.sessions then {pool.sessions[sessionId.value]} else {}
    ensures sessionId.None? ==> r == Ok(NoSessionIdFor(describe(request.parameters)))
    ensures sessionId.Some? && sessionId.value !in pool.sessions ==> r == Err(NoSuchSession(sessionId))
    ensures sessionId.Some? && sessionId.value in pool.sessions ==>
              var session := pool.sessions[sessionId.value];
              var reply := session.remoteControl.Forward(request, transport);
              && r == RelayResult(reply)
              && session.lastActiveAt == (if reply.Replied? then after else before)
  {
    if sessionId.None? {
      return Ok(NoSessionIdFor(describe(request.parameters)));
    }
    var found := pool.Retrieve(sessionId.value);
    if found.Err? {
      return Err(found.fault);
    }
    r := Relay(pool, sessionId.value, request, transport, before, after);
  }
}
