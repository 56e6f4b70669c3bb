/**
 * The WebDriver commands (commands/webdriver): a command relayed within a session,
 * opening a session, and ending one.
 */
module WebDriverCommands {

  import opened Faults
  import opened Http
  import opened Responses
  import opened Proxies
  import opened Provisioning
  import opened Pool
  import opened Environments
  import opened Json
  import opened Commands

  /**
   * `parseSessionId(text)`: the "sessionId" of the JSON object the text holds; null when
   * the text is not an object or the member is missing (a JSONException).
   */
  function ParseSessionId(decode: JsonDecoder, text: string): (r: Option<string>)
    ensures r.Some? <==>
              && decode(text).Some? && decode(text).value.JObject?
              && "sessionId" in decode(text).value.fields
              && decode(text).value.fields["sessionId"].JText?
    ensures r.Some? ==> decode(text).value.fields["sessionId"] == JText(r.value)
  {
    match DecodeObject(decode, text)
    case None => None
    case Some(fields) => GetString(fields, "sessionId")
  }

  /**
   * The id does not depend on anything but the "sessionId" member: two texts whose
   * objects agree on it yield the same id.
   */
  lemma ParseSessionIdReadsOnlyItsMember(decode: JsonDecoder, a: string, b: string)
    requires decode(a).Some? && decode(a).value.JObject? && decode(b).Some? && decode(b).value.JObject?
    requires "sessionId" in decode(a).value.fields <==> "sessionId" in decode(b).value.fields
    requires "sessionId" in decode(a).value.fields ==>
               decode(a).value.fields["sessionId"] == decode(b).value.fields["sessionId"]
    ensures ParseSessionId(decode, a) == ParseSessionId(decode, b)
  {
  }

  /** `parseSessionId(response)`: the id parsed out of a worker's reply; none when the call failed. */
  function ParsedId(decode: JsonDecoder, reply: Reply): Option<string> {
    if reply.Replied? then ParseSessionId(decode, reply.response.body) else None
  }

  /**
   * `WebDriverCommand.execute(pool)`: as the legacy relay, except that the session's
   * worker is switched to WebDriver mode and remembers the request before the session
   * is stamped and the request forwarded.
   */
  method ExecuteWebDriverCommand(pool: GlobalRemoteControlPool, sessionId: Option<string>, request: Request,
                                 transport: Transport, describe: map<string, string> -> string,
                                 before: int, after: int)
    returns (r: Result<Response>)
    modifies if sessionId.Some? && sessionId.value in pool.sessions then {pool.sessions[sessionId.value]} else {}
    modifies (if sessionId.Some? && sessionId.value in pool.sessions then {pool.sessions[sessionId.value].remoteControl}
              else {})`mode
    modifies (if sessionId.Some? && sessionId.value in pool.sessions then {pool.sessions[sessionId.value].remoteControl}
              else {})`request
    ensures sessionId.None? ==> r == Ok(NoSessionIdFor(describe(request.parameters)))
    ensures sessionId.Some? && sessionId.value !in pool.sessions ==> r == Err(NoSuchSession(sessionId))
    ensures sessionId.Some? && sessionId.value in pool.sessions ==>
              var session := pool.sessions[sessionId.value];
              var reply := session.remoteControl.Forward(request, transport);
              && session.remoteControl.mode == WebDriver
              && session.remoteControl.request == Some(request)
              && r == RelayResult(reply)
              && session.lastActiveAt == (if reply.Replied? then after else before)
  {
    if sessionId.None? {
      return Ok(NoSessionIdFor(describe(request.parameters)));
    }
    var found := pool.Retrieve(sessionId.value);
    if found.Err? {
      return Err(found.fault);
    }
    var rc := found.value;
    rc.SetMode(WebDriver);
    rc.SetRequest(request);
    r := Relay(pool, sessionId.value, request, transport, before, after);
  }

  /**
   * `NewBrowserSessionCommand.execute(pool)`: as the legacy one, except that the reserved
   * worker remembers the request and is switched to WebDriver mode before the forward,
   * and the session id is the "sessionId" member of the JSON reply.
   */
  method ExecuteNewBrowserSession(pool: GlobalRemoteControlPool, environment: Environment, request: Request,
                                  heartbeat: Heartbeat, transport: Transport, decode: JsonDecoder, now: int)
    returns (r: Result<Response>, ghost reserved: Option<RemoteControlProxy>)
    requires pool.Valid()
    modifies pool`sessions
    modifies if environment.name in pool.provisioners then {pool.provisioners[environment.name]} else {}
    modifies if environment.name in pool.provisioners then pool.provisioners[environment.name].remoteControls else []
    ensures pool.Valid()
    ensures environment.name !in old(pool.provisioners) <==> r == Err(NoSuchEnvironment(environment.name))
    ensures environment.name in old(pool.provisioners) ==>
              var s := old(pool.provisioners[environment.name].remoteControls);
              Planned(s, old(SnapshotOf(s)), heartbeat, reserved, pool.provisioners[environment.name].remoteControls)
    ensures reserved.None? ==> pool.sessions == old(pool.sessions)
    ensures reserved.None? && r.Ok? ==> r.value == ErrorResponse(NoAvailableRemoteControl(environment))
    ensures reserved.Some? ==>
              var rc := reserved.value;
              var reply := rc.Forward(request, transport);
              var id := ParsedId(decode, reply);
              && rc.mode == WebDriver && rc.request == Some(request)
              && r == Ok(AdmitResponse(reply, id, old(pool.sessions.Keys)))
              && (Admitted(reply, id, old(pool.sessions.Keys)) ==>
                    rc.sessionInProgress && Associated(pool, rc, id) && pool.sessions[id.value].lastActiveAt == now)
              && (!Admitted(reply, id, old(pool.sessions.Keys)) ==>
                    !rc.sessionInProgress && pool.sessions == old(pool.sessions))
  {
    var found := pool.Reserve(environment, heartbeat);
    if found.Err? {
      return Err(found.fault), None;
    }
    reserved := found.value;
    if found.value.None? {
      return Ok(ErrorResponse(NoAvailableRemoteControl(environment))), reserved;
    }
    var response := OpenSessionOn(pool, found.value.value, request, transport, decode, now);
    return Ok(response), reserved;
  }

  /**
   * The `execute` steps once a worker `rc` is reserved: it remembers the request and is
   * switched to WebDriver mode, the request is forwarded, and the reply admitted.
   */
  method OpenSessionOn(pool: GlobalRemoteControlPool, rc: RemoteControlProxy, request: Request,
                       transport: Transport, decode: JsonDecoder, now: int)
    returns (r: Response)
    requires pool.Valid()
    requires rc.sessionInProgress && rc.environment in pool.provisioners
    modifies pool`sessions, rc`sessionInProgress, rc`mode, rc`request
    ensures pool.Valid()
    ensures var reply := rc.Forward(request, transport);
            var id := ParsedId(decode, reply);
            && rc.mode == WebDriver && rc.request == Some(request)
            && r == AdmitResponse(reply, id, old(pool.sessions.Keys))
            && (Admitted(reply, id, old(pool.sessions.Keys)) ==>
                  rc.sessionInProgress && Associated(pool, rc, id) && pool.sessions[id.value].lastActiveAt == now)
            && (!Admitted(reply, id, old(pool.sessions.Keys)) ==>
                  !rc.sessionInProgress && pool.sessions == old(pool.sessions))
  {
    rc.SetRequest(request);
    rc.SetMode(WebDriver);
    var reply := rc.Forward(request, transport);
    r := Admit(pool, rc, reply, ParsedId(decode, reply), now);
  }

  /**
   * `TestCompleteCommand.execute(pool)`: the relay, then, in a `finally`, the session's
   * release. A release that throws replaces whatever the relay produced: a missing id
   * (Java null) or an unknown one is NoSuchSessionException, a worker whose environment
   * has no provisioner NullPointerException, an idle worker IllegalStateException.
   * When the release succeeds the relay's answer stands.
   */
  method ExecuteTestComplete(pool: GlobalRemoteControlPool, sessionId: Option<string>, request: Request,
                             transport: Transport, describe: map<string, string> -> string,
                             before: int, after: int)
    returns (r: Result<Response>)
    requires pool.Valid()
    modifies pool`sessions
    modifies if sessionId.Some? && sessionId.value in pool.sessions then {pool.sessions[sessionId.value]} else {}
    modifies (if sessionId.Some? && sessionId.value in pool.sessions then {pool.sessions[sessionId.value].remoteControl}
              else {})`mode
    modifies (if sessionId.Some? && sessionId.value in pool.sessions then {pool.sessions[sessionId.value].remoteControl}
              else {})`request
    modifies (if sessionId.Some? && sessionId.value in pool.sessions then {pool.sessions[sessionId.value].remoteControl}
              else {})`sessionInProgress
    ensures pool.Valid()
    ensures sessionId.None? ==> r == Err(NoSuchSession(None)) && pool.sessions == old(pool.sessions)
    ensures sessionId.Some? && sessionId.value !in old(pool.sessions) ==>
              r == Err(NoSuchSession(sessionId)) && pool.sessions == old(pool.sessions)
    ensures sessionId.Some? && sessionId.value in old(pool.sessions) ==>
              var session := old(pool.sessions[sessionId.value]);
              var rc := session.remoteControl;
              var reply := rc.Forward(request, transport);
              && pool.sessions == old(pool.sessions) - {sessionId.value}
              && rc.mode == WebDriver && rc.request == Some(request)
              && session.lastActiveAt == (if reply.Replied? then after else before)
              && (rc.environment !in pool.provisioners ==>
                    r == Err(NullPointer) && rc.sessionInProgress == old(rc.sessionInProgress))
              && (rc.environment in pool.provisioners ==> !rc.sessionInProgress)
              && (rc.environment in pool.provisioners && !old(rc.sessionInProgress) ==>
                    r == Err(IllegalState("Unregistering session on an idle remote control : " + old(rc.Description()))))
              && (rc.environment in pool.provisioners && old(rc.sessionInProgress) ==> r == RelayResult(reply))
  {
    var relayed := ExecuteWebDriverCommand(pool, sessionId, request, transport, describe, before, after);
    r := ReleaseFinally(pool, sessionId, relayed);
  }

  /**
   * The `finally` block of `TestCompleteCommand.execute`: the session is released, and
   * an exception the release throws replaces `relayed`, what the `try` block produced.
   * A worker that holds no request makes the release throw NullPointerException.
   */
  method ReleaseFinally(pool: GlobalRemoteControlPool, sessionId: Option<string>, relayed: Result<Response>)
    returns (r: Result<Response>)
    requires pool.Valid()
    modifies pool`sessions
    modifies (if sessionId.Some? && sessionId.value in pool.sessions then {pool.sessions[sessionId.value].remoteControl}
              else {})`sessionInProgress
    ensures pool.Valid()
    ensures sessionId.None? ==> r == Err(NoSuchSession(None)) && pool.sessions == old(pool.sessions)
    ensures sessionId.Some? && sessionId.value !in old(pool.sessions) ==>
              r == Err(NoSuchSession(sessionId)) && pool.sessions == old(pool.sessions)
    ensures sessionId.Some? && sessionId.value in old(pool.sessions) ==>
              var rc := old(pool.sessions[sessionId.value].remoteControl);
              && pool.sessions == old(pool.sessions) - {sessionId.value}
              && (rc.request.None? || rc.environment !in pool.provisioners ==>
                    r == Err(NullPointer) && rc.sessionInProgress == old(rc.sessionInProgress))
              && (rc.request.Some? && rc.environment in pool.provisioners ==> !rc.sessionInProgress)
              && (rc.request.Some? && rc.environment in pool.provisioners && !old(rc.sessionInProgress) ==>
                    r == Err(IllegalState("Unregistering session on an idle remote control : " + old(rc.Description()))))
              && (rc.request.Some? && rc.environment in pool.provisioners && old(rc.sessionInProgress) ==> r == relayed)
  {
    if sessionId.None? {
      return Err(NoSuchSession(None));
    }
    var released := pool.ReleaseForSession(sessionId.value);
    r := if released.Fail? then Err(released.fault) else relayed;
  }
}
